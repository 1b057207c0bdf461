/**
 * CRC-16 with the reflected polynomial 0x8408, as RFC 1662 appendix C.2 defines it bit by
 * bit and as the byte table computes it.
 */
module Crc16 {
  const POLYNOMIAL: bv16 := 0x8408
  const GOOD_FCS: bv16 := 0xF0B8
  const INITIAL_FCS: bv16 := 0xFFFF

  // ------------------------------------------------------------------
  // The bitwise definition
  // ------------------------------------------------------------------

  function ShiftOut(crc: bv16): bv16 {
    if crc & 1 == 1 then (crc >> 1) ^ POLYNOMIAL else crc >> 1
  }

  function ShiftOut8(crc: bv16): bv16 {
    ShiftOut(ShiftOut(ShiftOut(ShiftOut(ShiftOut(ShiftOut(ShiftOut(ShiftOut(crc))))))))
  }

  function BitValue(bit: bv1): bv16 { bit as bv16 }

  /** One data bit enters at the low end of the register. */
  function FeedBit(crc: bv16, bit: bv1): bv16 {
    ShiftOut(crc ^ BitValue(bit))
  }

  /** Bit `i` of a byte. */
  function Bit(b: bv8, i: nat): bv1
    requires i < 8
  {
    ((b >> i) & 1) as bv1
  }

  /** The eight bits of a byte, least significant first. */
  function FeedByte(crc: bv16, b: bv8): bv16 {
    FeedBit(FeedBit(FeedBit(FeedBit(FeedBit(FeedBit(FeedBit(FeedBit(
      crc, Bit(b, 0)), Bit(b, 1)), Bit(b, 2)), Bit(b, 3)),
      Bit(b, 4)), Bit(b, 5)), Bit(b, 6)), Bit(b, 7))
  }

  // ------------------------------------------------------------------
  // The table
  // ------------------------------------------------------------------

  function Pick(k: bv8, t0: bv16, t1: bv16, t2: bv16, t3: bv16, t4: bv16, t5: bv16, t6: bv16, t7: bv16): bv16 {
    if k == 0 then t0 else if k == 1 then t1 else if k == 2 then t2 else if k == 3 then t3
    else if k == 4 then t4 else if k == 5 then t5 else if k == 6 then t6 else t7
  }

  function Crc16Table(i: bv8): bv16 {
    var row, k := i >> 3, i & 7;
    if row == 0 then Pick(k, 0x0000, 0x1189, 0x2312, 0x329b, 0x4624, 0x57ad, 0x6536, 0x74bf)
    else if row == 1 then Pick(k, 0x8c48, 0x9dc1, 0xaf5a, 0xbed3, 0xca6c, 0xdbe5, 0xe97e, 0xf8f7)
    else if row == 2 then Pick(k, 0x1081, 0x0108, 0x3393, 0x221a, 0x56a5, 0x472c, 0x75b7, 0x643e)
    else if row == 3 then Pick(k, 0x9cc9, 0x8d40, 0xbfdb, 0xae52, 0xdaed, 0xcb64, 0xf9ff, 0xe876)
    else if row == 4 then Pick(k, 0x2102, 0x308b, 0x0210, 0x1399, 0x6726, 0x76af, 0x4434, 0x55bd)
    else if row == 5 then Pick(k, 0xad4a, 0xbcc3, 0x8e58, 0x9fd1, 0xeb6e, 0xfae7, 0xc87c, 0xd9f5)
    else if row == 6 then Pick(k, 0x3183, 0x200a, 0x1291, 0x0318, 0x77a7, 0x662e, 0x54b5, 0x453c)
    else if row == 7 then Pick(k, 0xbdcb, 0xac42, 0x9ed9, 0x8f50, 0xfbef, 0xea66, 0xd8fd, 0xc974)
    else if row == 8 then Pick(k, 0x4204, 0x538d, 0x6116, 0x709f, 0x0420, 0x15a9, 0x2732, 0x36bb)
    else if row == 9 then Pick(k, 0xce4c, 0xdfc5, 0xed5e, 0xfcd7, 0x8868, 0x99e1, 0xab7a, 0xbaf3)
    else if row == 10 then Pick(k, 0x5285, 0x430c, 0x7197, 0x601e, 0x14a1, 0x0528, 0x37b3, 0x263a)
    else if row == 11 then Pick(k, 0xdecd, 0xcf44, 0xfddf, 0xec56, 0x98e9, 0x8960, 0xbbfb, 0xaa72)
    else if row == 12 then Pick(k, 0x6306, 0x728f, 0x4014, 0x519d, 0x2522, 0x34ab, 0x0630, 0x17b9)
    else if row == 13 then Pick(k, 0xef4e, 0xfec7, 0xcc5c, 0xddd5, 0xa96a, 0xb8e3, 0x8a78, 0x9bf1)
    else if row == 14 then Pick(k, 0x7387, 0x620e, 0x5095, 0x411c, 0x35a3, 0x242a, 0x16b1, 0x0738)
    else if row == 15 then Pick(k, 0xffcf, 0xee46, 0xdcdd, 0xcd54, 0xb9eb, 0xa862, 0x9af9, 0x8b70)
    else if row == 16 then Pick(k, 0x8408, 0x9581, 0xa71a, 0xb693, 0xc22c, 0xd3a5, 0xe13e, 0xf0b7)
    else if row == 17 then Pick(k, 0x0840, 0x19c9, 0x2b52, 0x3adb, 0x4e64, 0x5fed, 0x6d76, 0x7cff)
    else if row == 18 then Pick(k, 0x9489, 0x8500, 0xb79b, 0xa612, 0xd2ad, 0xc324, 0xf1bf, 0xe036)
    else if row == 19 then Pick(k, 0x18c1, 0x0948, 0x3bd3, 0x2a5a, 0x5ee5, 0x4f6c, 0x7df7, 0x6c7e)
    else if row == 20 then Pick(k, 0xa50a, 0xb483, 0x8618, 0x9791, 0xe32e, 0xf2a7, 0xc03c, 0xd1b5)
    else if row == 21 then Pick(k, 0x2942, 0x38cb, 0x0a50, 0x1bd9, 0x6f66, 0x7eef, 0x4c74, 0x5dfd)
    else if row == 22 then Pick(k, 0xb58b, 0xa402, 0x9699, 0x8710, 0xf3af, 0xe226, 0xd0bd, 0xc134)
    else if row == 23 then Pick(k, 0x39c3, 0x284a, 0x1ad1, 0x0b58, 0x7fe7, 0x6e6e, 0x5cf5, 0x4d7c)
    else if row == 24 then Pick(k, 0xc60c, 0xd785, 0xe51e, 0xf497, 0x8028, 0x91a1, 0xa33a, 0xb2b3)
    else if row == 25 then Pick(k, 0x4a44, 0x5bcd, 0x6956, 0x78df, 0x0c60, 0x1de9, 0x2f72, 0x3efb)
    else if row == 26 then Pick(k, 0xd68d, 0xc704, 0xf59f, 0xe416, 0x90a9, 0x8120, 0xb3bb, 0xa232)
    else if row == 27 then Pick(k, 0x5ac5, 0x4b4c, 0x79d7, 0x685e, 0x1ce1, 0x0d68, 0x3ff3, 0x2e7a)
    else if row == 28 then Pick(k, 0xe70e, 0xf687, 0xc41c, 0xd595, 0xa12a, 0xb0a3, 0x8238, 0x93b1)
    else if row == 29 then Pick(k, 0x6b46, 0x7acf, 0x4854, 0x59dd, 0x2d62, 0x3ceb, 0x0e70, 0x1ff9)
    else if row == 30 then Pick(k, 0xf78f, 0xe606, 0xd49d, 0xc514, 0xb1ab, 0xa022, 0x92b9, 0x8330)
    else Pick(k, 0x7bc7, 0x6a4e, 0x58d5, 0x495c, 0x3de3, 0x2c6a, 0x1ef1, 0x0f78)
  }

  /** The code's update: one table lookup per byte. */
  function Step(crc: bv16, b: bv8): bv16 {
    Xor(Crc16Table(LowByte(Xor(crc, Wide(b)))), HighByte(crc))
  }

  lemma TableEighth0(i: bv8)
    requires i < 0x20
    ensures Crc16Table(i) == ShiftOut8(i as bv16)
  {
  }

  lemma TableEighth1(i: bv8)
    requires 0x20 <= i < 0x40
    ensures Crc16Table(i) == ShiftOut8(i as bv16)
  {
  }

  lemma TableEighth2(i: bv8)
    requires 0x40 <= i < 0x60
    ensures Crc16Table(i) == ShiftOut8(i as bv16)
  {
  }

  lemma TableEighth3(i: bv8)
    requires 0x60 <= i < 0x80
    ensures Crc16Table(i) == ShiftOut8(i as bv16)
  {
  }

  lemma TableEighth4(i: bv8)
    requires 0x80 <= i < 0xA0
    ensures Crc16Table(i) == ShiftOut8(i as bv16)
  {
  }

  lemma TableEighth5(i: bv8)
    requires 0xA0 <= i < 0xC0
    ensures Crc16Table(i) == ShiftOut8(i as bv16)
  {
  }

  lemma TableEighth6(i: bv8)
    requires 0xC0 <= i < 0xE0
    ensures Crc16Table(i) == ShiftOut8(i as bv16)
  {
  }

  lemma TableEighth7(i: bv8)
    requires 0xE0 <= i
    ensures Crc16Table(i) == ShiftOut8(i as bv16)
  {
  }

  /** All 256 entries: each is the register after shifting out the eight bits of its index. */
  lemma TableIsEightShifts(i: bv8)
    ensures Crc16Table(i) == ShiftOut8(i as bv16)
  {
    hide Crc16Table, ShiftOut8;
    if i < 0x20 {
      TableEighth0(i);
    } else if i < 0x40 {
      TableEighth1(i);
    } else if i < 0x60 {
      TableEighth2(i);
    } else if i < 0x80 {
      TableEighth3(i);
    } else if i < 0xA0 {
      TableEighth4(i);
    } else if i < 0xC0 {
      TableEighth5(i);
    } else if i < 0xE0 {
      TableEighth6(i);
    } else {
      TableEighth7(i);
    }
  }

  /** The table-driven update is the bitwise one. */
  lemma StepIsFeedByte(crc: bv16, b: bv8)
    ensures Step(crc, b) == FeedByte(crc, b)
  {
    hide Crc16Table, ShiftOut8, FeedByte, LowByte, HighByte, Wide, Xor;
    TableIsEightShifts(LowByte(Xor(crc, Wide(b))));
    WideIs(LowByte(Xor(crc, Wide(b))));
    ShiftsSplit(crc, b);
  }

  function Wide(b: bv8): bv16 { b as bv16 }

  function LowByte(x: bv16): bv8 { (x & 0xFF) as bv8 }

  function HighByte(x: bv16): bv16 { x >> 8 }

  lemma WideIs(b: bv8)
    ensures Wide(b) == b as bv16
  {
  }

  lemma HighByteMovesDown(x: bv16)
    ensures ShiftOut8(x) == Xor(ShiftOut8(Wide(LowByte(x))), HighByte(x))
  {
    hide ShiftOut, Half, Xor, Wide, LowByte, HighByte;
    var c0, h0 := Wide(LowByte(x)), x & 0xFF00;
    HighHalves(x);
    EvenHalves(x);
    ShiftPast(c0, h0);
    var c1, h1 := ShiftOut(c0), Half(h0);
    ShiftPast(c1, h1);
    var c2, h2 := ShiftOut(c1), Half(h1);
    ShiftPast(c2, h2);
    var c3, h3 := ShiftOut(c2), Half(h2);
    ShiftPast(c3, h3);
    var c4, h4 := ShiftOut(c3), Half(h3);
    ShiftPast(c4, h4);
    var c5, h5 := ShiftOut(c4), Half(h4);
    ShiftPast(c5, h5);
    var c6, h6 := ShiftOut(c5), Half(h5);
    ShiftPast(c6, h6);
    var c7, h7 := ShiftOut(c6), Half(h6);
    ShiftPast(c7, h7);
  }

  /** Bits above the lowest pass through a shift unchanged. */
  lemma ShiftPast(c: bv16, h: bv16)
    requires h & 1 == 0
    ensures ShiftOut(Xor(c, h)) == Xor(ShiftOut(c), Half(h))
  {
    SameLowBit(c, h);
    HalfOfXor(c, h);
    XorSwaps(c >> 1, h >> 1);
  }

  lemma SameLowBit(c: bv16, h: bv16)
    requires h & 1 == 0
    ensures (c ^ h) & 1 == c & 1
  {
  }

  lemma HalfOfXor(c: bv16, h: bv16)
    ensures (c ^ h) >> 1 == (c >> 1) ^ (h >> 1)
  {
  }

  lemma XorSwaps(a: bv16, b: bv16)
    ensures (a ^ b) ^ POLYNOMIAL == (a ^ POLYNOMIAL) ^ b
  {
  }

  lemma HighHalves(x: bv16)
    ensures Xor(Wide(LowByte(x)), x & 0xFF00) == x
    ensures Half(Half(Half(Half(Half(Half(Half(Half(x & 0xFF00)))))))) == HighByte(x)
  {
  }

  lemma EvenHalves(x: bv16)
    ensures
      && (x & 0xFF00) & 1 == 0
      && Half(x & 0xFF00) & 1 == 0
      && Half(Half(x & 0xFF00)) & 1 == 0
      && Half(Half(Half(x & 0xFF00))) & 1 == 0
      && Half(Half(Half(Half(x & 0xFF00)))) & 1 == 0
      && Half(Half(Half(Half(Half(x & 0xFF00))))) & 1 == 0
      && Half(Half(Half(Half(Half(Half(x & 0xFF00)))))) & 1 == 0
      && Half(Half(Half(Half(Half(Half(Half(x & 0xFF00))))))) & 1 == 0
  {
  }

  lemma HighByteStays(crc: bv16, b: bv8)
    ensures HighByte(Xor(crc, Wide(b))) == HighByte(crc)
  {
  }

  function Half(d: bv16): bv16 { d >> 1 }

  function LowBit(d: bv16): bv1 { (d & 1) as bv1 }

  /** Feeding a bit now is shifting it out later: the bits still to come may be XORed in at once. */
  lemma FeedEarly(c: bv16, d: bv16)
    ensures Xor(FeedBit(c, LowBit(d)), Half(d)) == ShiftOut(Xor(c, d))
  {
    hide ShiftOut;
    assert BitValue(LowBit(d)) == d & 1;
    RestOfShift(c, d);
  }

  lemma RestOfShift(c: bv16, d: bv16)
    ensures ShiftOut(c ^ (d & 1)) ^ (d >> 1) == ShiftOut(c ^ d)
  {
  }

  lemma BitsByHalving(b: bv8)
    ensures var d := b as bv16;
      && Bit(b, 0) == LowBit(d) && Bit(b, 1) == LowBit(Half(d)) && Bit(b, 2) == LowBit(Half(Half(d)))
      && Bit(b, 3) == LowBit(Half(Half(Half(d)))) && Bit(b, 4) == LowBit(Half(Half(Half(Half(d)))))
      && Bit(b, 5) == LowBit(Half(Half(Half(Half(Half(d))))))
      && Bit(b, 6) == LowBit(Half(Half(Half(Half(Half(Half(d)))))))
      && Bit(b, 7) == LowBit(Half(Half(Half(Half(Half(Half(Half(d))))))))
      && Half(Half(Half(Half(Half(Half(Half(Half(d)))))))) == 0
  {
  }

  lemma FeedByteIsShifts(crc: bv16, b: bv8)
    ensures FeedByte(crc, b) == ShiftOut8(crc ^ (b as bv16))
  {
    hide FeedBit, ShiftOut, Bit, Half, LowBit, Xor;
    BitsByHalving(b);
    var d0 := b as bv16;
    FeedEarly(crc, d0);
    var c1, d1 := FeedBit(crc, Bit(b, 0)), Half(d0);
    FeedEarly(c1, d1);
    var c2, d2 := FeedBit(c1, Bit(b, 1)), Half(d1);
    FeedEarly(c2, d2);
    var c3, d3 := FeedBit(c2, Bit(b, 2)), Half(d2);
    FeedEarly(c3, d3);
    var c4, d4 := FeedBit(c3, Bit(b, 3)), Half(d3);
    FeedEarly(c4, d4);
    var c5, d5 := FeedBit(c4, Bit(b, 4)), Half(d4);
    FeedEarly(c5, d5);
    var c6, d6 := FeedBit(c5, Bit(b, 5)), Half(d5);
    FeedEarly(c6, d6);
    var c7, d7 := FeedBit(c6, Bit(b, 6)), Half(d6);
    FeedEarly(c7, d7);
    var c8, d8 := FeedBit(c7, Bit(b, 7)), Half(d7);
    XorZeroRight(c8, crc, d0);
  }

  lemma XorZeroRight(c: bv16, a: bv16, b: bv16)
    ensures Xor(c, 0) == c && Xor(a, b) == a ^ b
  {
  }

  /** Only the low byte of the register meets the data; the high byte just moves down. */
  lemma ShiftsSplit(crc: bv16, b: bv8)
    ensures Xor(ShiftOut8(Wide(LowByte(Xor(crc, Wide(b))))), HighByte(crc)) == FeedByte(crc, b)
  {
    hide ShiftOut8, FeedByte, LowByte, HighByte, Wide, Xor;
    FeedByteIsShifts(crc, b);
    RegisterAndByte(crc, b);
    HighByteMovesDown(Xor(crc, Wide(b)));
    HighByteStays(crc, b);
  }

  lemma RegisterAndByte(crc: bv16, b: bv8)
    ensures Xor(crc, Wide(b)) == crc ^ (b as bv16)
  {
  }

  // ------------------------------------------------------------------
  // Whole messages
  // ------------------------------------------------------------------

  function Crc(iv: bv16, data: seq<bv8>): bv16 {
    if data == [] then iv else Step(Crc(iv, data[..|data| - 1]), data[|data| - 1])
  }

  method HdlcCrc16(iv: bv16, data: seq<bv8>) returns (crc: bv16)
    ensures crc == Crc(iv, data)
  {
    hide Step;
    crc := iv;
    for i := 0 to |data|
      invariant crc == Crc(iv, data[..i])
    {
      assert data[..i + 1][..i] == data[..i];
      crc := Step(crc, data[i]);
    }
    assert data[..|data|] == data;
  }

  lemma {:induction false} CrcConcat(iv: bv16, a: seq<bv8>, b: seq<bv8>)
    ensures Crc(iv, a + b) == Crc(Crc(iv, a), b)
  {
    if b == [] {
      assert a + b == a;
    } else {
      var k := |b| - 1;
      CrcConcat(iv, a, b[..k]);
      assert (a + b)[..|a + b| - 1] == a + b[..k];
    }
  }

  /** The frame check sequence: the complemented register, low byte first. */
  function Fcs(m: seq<bv8>): (fcs: seq<bv8>)
    ensures |fcs| == 2
  {
    var c := Crc(INITIAL_FCS, m) ^ 0xFFFF;
    [(c & 0xFF) as bv8, ((c >> 8) & 0xFF) as bv8]
  }

  /** The check sequence of nothing is zero, and that of "123456789" is 0x906E. */
  lemma KnownCheck()
    ensures Fcs([]) == [0, 0]
    ensures Fcs([49, 50, 51, 52, 53, 54, 55, 56, 57]) == [0x6E, 0x90]
  {
    hide Crc;
    KnownStart();
    KnownSteps();
  }

  lemma KnownStart()
    ensures Crc(INITIAL_FCS, []) == 0xFFFF
  {
  }

  lemma CrcStep(iv: bv16, data: seq<bv8>, b: bv8, c: bv16)
    requires Crc(iv, data) == c
    ensures Crc(iv, data + [b]) == Step(c, b)
  {
    hide Step;
    assert (data + [b])[..|data|] == data;
  }

  lemma KnownSteps()
    ensures Crc(INITIAL_FCS, [49, 50, 51, 52, 53, 54, 55, 56, 57]) == 0x6F91
  {
    hide Crc, Step;
    KnownStart();
    KnownRegisters();
    var m: seq<bv8> := [49, 50, 51, 52, 53, 54, 55, 56, 57];
    CrcStep(INITIAL_FCS, [], 49, 0xFFFF);
    assert [] + [49] == m[..1];
    CrcStep(INITIAL_FCS, m[..1], 50, 0x2F8D);
    assert m[..1] + [50] == m[..2];
    CrcStep(INITIAL_FCS, m[..2], 51, 0x4D53);
    assert m[..2] + [51] == m[..3];
    CrcStep(INITIAL_FCS, m[..3], 52, 0x634B);
    assert m[..3] + [52] == m[..4];
    CrcStep(INITIAL_FCS, m[..4], 53, 0x8B13);
    assert m[..4] + [53] == m[..5];
    CrcStep(INITIAL_FCS, m[..5], 54, 0x44BF);
    assert m[..5] + [54] == m[..6];
    CrcStep(INITIAL_FCS, m[..6], 55, 0x198D);
    assert m[..6] + [55] == m[..7];
    CrcStep(INITIAL_FCS, m[..7], 56, 0x1AC8);
    assert m[..7] + [56] == m[..8];
    CrcStep(INITIAL_FCS, m[..8], 57, 0xF795);
    assert m[..8] + [57] == m;
  }

  lemma KnownRegisters()
    ensures Step(0xFFFF, 49) == 0x2F8D && Step(0x2F8D, 50) == 0x4D53 && Step(0x4D53, 51) == 0x634B
    ensures Step(0x634B, 52) == 0x8B13 && Step(0x8B13, 53) == 0x44BF && Step(0x44BF, 54) == 0x198D
    ensures Step(0x198D, 55) == 0x1AC8 && Step(0x1AC8, 56) == 0xF795 && Step(0xF795, 57) == 0x6F91
  {
    hide ShiftOut8, Step;
    KnownShifts0();
    KnownShifts1();
    KnownShifts2();
    StepBy(0xFFFF, 49, 0xCE);
    StepBy(0x2F8D, 50, 0xBF);
    StepBy(0x4D53, 51, 0x60);
    StepBy(0x634B, 52, 0x7F);
    StepBy(0x8B13, 53, 0x26);
    StepBy(0x44BF, 54, 0x89);
    StepBy(0x198D, 55, 0xBA);
    StepBy(0x1AC8, 56, 0xF0);
    StepBy(0xF795, 57, 0xAC);
  }

  /** A step with the shifts it stands for. */
  lemma StepBy(crc: bv16, b: bv8, i: bv16)
    requires Wide(LowByte(Xor(crc, Wide(b)))) == i
    ensures Step(crc, b) == Xor(ShiftOut8(i), HighByte(crc))
  {
    hide Crc16Table, ShiftOut8, LowByte, Xor, Wide, HighByte;
    var k := LowByte(Xor(crc, Wide(b)));
    TableIsEightShifts(k);
    WideIs(k);
  }

  lemma KnownShifts0()
    ensures ShiftOut8(0xCE) == 0x2f72 && ShiftOut8(0xBF) == 0x4d7c && ShiftOut8(0x60) == 0x6306
  {
  }

  lemma KnownShifts1()
    ensures ShiftOut8(0x7F) == 0x8b70 && ShiftOut8(0x26) == 0x4434 && ShiftOut8(0x89) == 0x19c9
  {
  }

  lemma KnownShifts2()
    ensures ShiftOut8(0xBA) == 0x1ad1 && ShiftOut8(0xF0) == 0xf78f && ShiftOut8(0xAC) == 0x6f66
  {
  }

  lemma ResidueOfRegister(c: bv16)
    ensures FeedByte(FeedByte(c, ((c ^ 0xFFFF) & 0xFF) as bv8), (((c ^ 0xFFFF) >> 8) & 0xFF) as bv8) == GOOD_FCS
  {
    hide FeedByte, ShiftOut8;
    var lo, hi := ((c ^ 0xFFFF) & 0xFF) as bv8, (((c ^ 0xFFFF) >> 8) & 0xFF) as bv8;
    FeedByteIsShifts(c, lo);
    HighByteMovesDown(c ^ (lo as bv16));
    RegisterCancels(c, ShiftOut8(0xFF));
    FeedByteIsShifts(FeedByte(c, lo), hi);
    ConstantResidue();
  }

  /** The complemented check sequence cancels the register, whatever it was. */
  lemma RegisterCancels(c: bv16, k: bv16)
    ensures var lo, hi := ((c ^ 0xFFFF) & 0xFF) as bv8, (((c ^ 0xFFFF) >> 8) & 0xFF) as bv8;
      && (c ^ (lo as bv16)) & 0xFF == 0xFF
      && (k ^ ((c ^ (lo as bv16)) >> 8)) ^ (hi as bv16) == k ^ 0xFF
  {
  }

  lemma ConstantResidue()
    ensures ShiftOut8(ShiftOut8(0xFF) ^ 0xFF) == GOOD_FCS
  {
  }

  /** A message followed by its check sequence always leaves the same register value. */
  lemma Residue(m: seq<bv8>)
    ensures Crc(INITIAL_FCS, m + Fcs(m)) == GOOD_FCS
  {
    hide Step, FeedByte;
    var c := Crc(INITIAL_FCS, m);
    var fcs := Fcs(m);
    CrcConcat(INITIAL_FCS, m, fcs);
    TwoSteps(c, fcs[0], fcs[1]);
    assert fcs == [fcs[0], fcs[1]];
    StepIsFeedByte(c, fcs[0]);
    StepIsFeedByte(Step(c, fcs[0]), fcs[1]);
    ResidueOfRegister(c);
  }

  lemma TwoSteps(c: bv16, a: bv8, b: bv8)
    ensures Crc(c, [a, b]) == Step(Step(c, a), b)
  {
    hide Step;
    assert [a, b][..1] == [a];
    assert Crc(c, [a]) == Step(Crc(c, [a][..0]), a);
    assert [a][..0] == [];
  }

  // ------------------------------------------------------------------
  // Error detection
  // ------------------------------------------------------------------

  function ByteBits(b: bv8): seq<bv1> {
    [Bit(b, 0), Bit(b, 1), Bit(b, 2), Bit(b, 3), Bit(b, 4), Bit(b, 5), Bit(b, 6), Bit(b, 7)]
  }

  /** A byte string as it travels: each byte's least significant bit first. */
  function Bits(data: seq<bv8>): (bits: seq<bv1>)
    ensures |bits| == 8 * |data|
  {
    if data == [] then [] else Bits(data[..|data| - 1]) + ByteBits(data[|data| - 1])
  }

  function FeedBits(crc: bv16, bits: seq<bv1>): bv16
    decreases |bits|
  {
    if bits == [] then crc else FeedBits(FeedBit(crc, bits[0]), bits[1..])
  }

  lemma {:induction false} FeedBitsConcat(crc: bv16, a: seq<bv1>, b: seq<bv1>)
    ensures FeedBits(crc, a + b) == FeedBits(FeedBits(crc, a), b)
    decreases |a|
  {
    hide FeedBit;
    if a == [] {
      assert a + b == b;
    } else {
      FeedBitsConcat(FeedBit(crc, a[0]), a[1..], b);
      assert (a + b)[1..] == a[1..] + b;
    }
  }

  lemma FeedFourBits(crc: bv16, b0: bv1, b1: bv1, b2: bv1, b3: bv1, rest: seq<bv1>)
    ensures FeedBits(crc, [b0, b1, b2, b3] + rest) == FeedBits(FeedBit(FeedBit(FeedBit(FeedBit(crc, b0), b1), b2), b3), rest)
  {
    hide FeedBit;
    FeedFirst(crc, b0, [b1, b2, b3] + rest);
    FeedFirst(FeedBit(crc, b0), b1, [b2, b3] + rest);
    FeedFirst(FeedBit(FeedBit(crc, b0), b1), b2, [b3] + rest);
    FeedFirst(FeedBit(FeedBit(FeedBit(crc, b0), b1), b2), b3, rest);
    assert [b0, b1, b2, b3] + rest == [b0] + ([b1, b2, b3] + rest);
    assert [b1, b2, b3] + rest == [b1] + ([b2, b3] + rest);
    assert [b2, b3] + rest == [b2] + ([b3] + rest);
  }

  lemma FeedFirst(crc: bv16, bit: bv1, rest: seq<bv1>)
    ensures FeedBits(crc, [bit] + rest) == FeedBits(FeedBit(crc, bit), rest)
  {
    assert ([bit] + rest)[1..] == rest;
  }

  lemma FeedByteIsBits(crc: bv16, b: bv8)
    ensures FeedBits(crc, ByteBits(b)) == FeedByte(crc, b)
  {
    hide FeedBit, Bit, FeedBits;
    var high := [Bit(b, 4), Bit(b, 5), Bit(b, 6), Bit(b, 7)];
    assert ByteBits(b) == [Bit(b, 0), Bit(b, 1), Bit(b, 2), Bit(b, 3)] + high;
    FeedFourBits(crc, Bit(b, 0), Bit(b, 1), Bit(b, 2), Bit(b, 3), high);
    assert high == high + [];
    var half := FeedBit(FeedBit(FeedBit(FeedBit(crc, Bit(b, 0)), Bit(b, 1)), Bit(b, 2)), Bit(b, 3));
    FeedFourBits(half, Bit(b, 4), Bit(b, 5), Bit(b, 6), Bit(b, 7), []);
    FeedNothing(FeedBit(FeedBit(FeedBit(FeedBit(half, Bit(b, 4)), Bit(b, 5)), Bit(b, 6)), Bit(b, 7)));
  }

  lemma FeedNothing(crc: bv16)
    ensures FeedBits(crc, []) == crc
  {
  }

  /** The register is the bitwise division of the whole bit stream. */
  lemma {:induction false} CrcIsBitwise(iv: bv16, data: seq<bv8>)
    ensures Crc(iv, data) == FeedBits(iv, Bits(data))
  {
    hide Step, FeedByte, ByteBits;
    if data != [] {
      var k := |data| - 1;
      CrcIsBitwise(iv, data[..k]);
      FeedBitsConcat(iv, Bits(data[..k]), ByteBits(data[k]));
      StepIsFeedByte(Crc(iv, data[..k]), data[k]);
      FeedByteIsBits(Crc(iv, data[..k]), data[k]);
    }
  }

  function Xor(a: bv16, b: bv16): bv16 { a ^ b }

  predicate Within(p: bv16, mask: bv16) { p & !mask == 0 }

  function Push(p: bv16, bit: bv1): bv16 { (p << 1) | BitValue(bit) }

  /** At most sixteen bits as a number, first bit lowest, and the mask that covers them. */
  function Pack(bits: seq<bv1>): bv16 {
    if bits == [] then 0 else Push(Pack(bits[1..]), bits[0])
  }

  function Cover(n: nat): bv16 {
    if n == 0 then 0 else Push(Cover(n - 1), 1)
  }

  lemma PushWithin(p: bv16, mask: bv16, bit: bv1)
    ensures Within(0, mask)
    ensures Within(p, mask) ==> Within(Push(p, bit), Push(mask, 1))
  {
  }

  lemma {:induction false} PackWithin(bits: seq<bv1>, n: nat)
    requires |bits| <= n
    ensures Within(Pack(bits), Cover(n))
  {
    hide Push, Within;
    PushWithin(0, Cover(n), 1);
    if bits != [] {
      PackWithin(bits[1..], n - 1);
      PushWithin(Pack(bits[1..]), Cover(n - 1), bits[0]);
    }
  }

  lemma CoverOf15()
    ensures Cover(15) == 0x7FFF
  {
    assert Cover(3) == 0x7;
    assert Cover(6) == 0x3F;
    assert Cover(9) == 0x1FF;
    assert Cover(12) == 0xFFF;
  }

  /** The step behind error detection: shifting out loses nothing while the top bit of the difference is clear. */
  lemma UnshiftDifference(c: bv16, d: bv16, u: bv1, v: bv1, p: bv16, q: bv16)
    requires Xor(FeedBit(c, u), FeedBit(d, v)) == Xor(p, q)
    requires Within(p, 0x7FFF) && Within(q, 0x7FFF)
    ensures Xor(c, d) == Xor(Push(p, u), Push(q, v))
  {
    hide ShiftOut, BitValue, Within, Xor, Push;
    UnshiftRegisters(c ^ BitValue(u), d ^ BitValue(v), p, q);
    LowBitsApart(c, d, u, v, p, q);
  }

  lemma UnshiftRegisters(x: bv16, y: bv16, p: bv16, q: bv16)
    requires Xor(ShiftOut(x), ShiftOut(y)) == Xor(p, q) && Within(p, 0x7FFF) && Within(q, 0x7FFF)
    ensures Xor(x, y) == Xor(p << 1, q << 1)
  {
  }

  lemma LowBitsApart(c: bv16, d: bv16, u: bv1, v: bv1, p: bv16, q: bv16)
    requires Xor(c ^ BitValue(u), d ^ BitValue(v)) == Xor(p << 1, q << 1)
    ensures Xor(c, d) == Xor(Push(p, u), Push(q, v))
  {
    hide Xor, Push, BitValue;
    PushIsXor(p, u);
    PushIsXor(q, v);
    XorOfXors(c, BitValue(u), d, BitValue(v));
    XorOfXors(p << 1, BitValue(u), q << 1, BitValue(v));
    XorCancels(Xor(c, d), Xor(p << 1, q << 1), Xor(BitValue(u), BitValue(v)));
  }

  lemma PushIsXor(p: bv16, u: bv1)
    ensures Push(p, u) == (p << 1) ^ BitValue(u)
  {
  }

  lemma XorOfXors(a: bv16, x: bv16, b: bv16, y: bv16)
    ensures Xor(a ^ x, b ^ y) == Xor(Xor(a, b), Xor(x, y))
  {
  }

  lemma XorCancels(a: bv16, b: bv16, w: bv16)
    ensures Xor(a, w) == b ==> a == Xor(b, w)
  {
  }

  lemma XorSelf(c: bv16)
    ensures Xor(c, c) == 0 && Xor(0, 0) == 0 && Within(0, 0x7FFF)
  {
  }

  lemma XorZero(c: bv16, d: bv16)
    requires Xor(c, d) == 0
    ensures c == d
  {
  }

  /** Two windows of at most sixteen bits that lead to the same register differ exactly as the registers before them. */
  lemma {:induction false} WindowDifference(c: bv16, d: bv16, u: seq<bv1>, v: seq<bv1>)
    requires |u| == |v| <= 16
    requires FeedBits(c, u) == FeedBits(d, v)
    ensures Xor(c, d) == Xor(Pack(u), Pack(v))
    decreases |u|
  {
    hide FeedBit, Xor, Push, Within, Cover;
    XorSelf(c);
    if u != [] {
      WindowDifference(FeedBit(c, u[0]), FeedBit(d, v[0]), u[1..], v[1..]);
      CoverOf15();
      PackWithin(u[1..], 15);
      PackWithin(v[1..], 15);
      UnshiftDifference(c, d, u[0], v[0], Pack(u[1..]), Pack(v[1..]));
    }
  }

  lemma PushInjective(p: bv16, q: bv16, u: bv1, v: bv1)
    requires Within(p, 0x7FFF) && Within(q, 0x7FFF) && Push(p, u) == Push(q, v)
    ensures p == q && u == v
  {
  }

  lemma {:induction false} PackInjective(u: seq<bv1>, v: seq<bv1>)
    requires |u| == |v| <= 16 && Pack(u) == Pack(v)
    ensures u == v
  {
    hide Push, Within, Cover;
    if u != [] {
      CoverOf15();
      PackWithin(u[1..], 15);
      PackWithin(v[1..], 15);
      PushInjective(Pack(u[1..]), Pack(v[1..]), u[0], v[0]);
      PackInjective(u[1..], v[1..]);
      assert u == [u[0]] + u[1..] && v == [v[0]] + v[1..];
    }
  }

  lemma FeedBitInjective(c: bv16, d: bv16, bit: bv1)
    requires FeedBit(c, bit) == FeedBit(d, bit)
    ensures c == d
  {
  }

  lemma {:induction false} RegisterInjective(c: bv16, d: bv16, bits: seq<bv1>)
    requires FeedBits(c, bits) == FeedBits(d, bits)
    ensures c == d
    decreases |bits|
  {
    hide FeedBit;
    if bits != [] {
      RegisterInjective(FeedBit(c, bits[0]), FeedBit(d, bits[0]), bits[1..]);
      FeedBitInjective(c, d, bits[0]);
    }
  }

  /**
   * Every error burst of at most sixteen bits is detected: two byte strings of equal length
   * whose bit streams differ only inside sixteen consecutive positions never share a check value.
   */
  lemma BurstDetected(iv: bv16, s: seq<bv8>, t: seq<bv8>, at: nat, width: nat)
    requires |s| == |t| && width <= 16 && at + width <= 8 * |s|
    requires Bits(s)[..at] == Bits(t)[..at] && Bits(s)[at + width..] == Bits(t)[at + width..]
    requires Crc(iv, s) == Crc(iv, t)
    ensures s == t
  {
    hide Xor, Crc, Bits, Pack, FeedBits;
    var a, b, n := Bits(s), Bits(t), at + width;
    CrcIsBitwise(iv, s);
    CrcIsBitwise(iv, t);
    SplitStream(iv, a, at, n);
    SplitStream(iv, b, at, n);
    var start := FeedBits(iv, a[..at]);
    RegisterInjective(FeedBits(start, a[at..n]), FeedBits(start, b[at..n]), a[n..]);
    WindowDifference(start, start, a[at..n], b[at..n]);
    XorSelf(start);
    XorZero(Pack(a[at..n]), Pack(b[at..n]));
    PackInjective(a[at..n], b[at..n]);
    assert a == a[..at] + a[at..n] + a[n..];
    assert b == b[..at] + b[at..n] + b[n..];
    BitsInjective(s, t);
  }

  /** The receiver's test is exact: the good residue means the last two bytes are the right check sequence. */
  lemma ResidueIsExact(m: seq<bv8>, tail: seq<bv8>)
    requires |tail| == 2
    ensures Crc(INITIAL_FCS, m + tail) == GOOD_FCS <==> tail == Fcs(m)
  {
    hide Fcs, Bits, Crc;
    Residue(m);
    if Crc(INITIAL_FCS, m + tail) == GOOD_FCS {
      BitsPrefix(m, tail);
      BitsPrefix(m, Fcs(m));
      assert Bits(m + tail)[8 * |m| + 16..] == [] == Bits(m + Fcs(m))[8 * |m| + 16..];
      BurstDetected(INITIAL_FCS, m + tail, m + Fcs(m), 8 * |m|, 16);
      assert (m + tail)[|m|..] == tail && (m + Fcs(m))[|m|..] == Fcs(m);
    }
  }

  lemma {:induction false} BitsPrefix(a: seq<bv8>, b: seq<bv8>)
    ensures Bits(a + b)[..8 * |a|] == Bits(a)
  {
    hide ByteBits;
    if b == [] {
      assert a + b == a;
    } else {
      var k := |b| - 1;
      assert (a + b)[..|a + b| - 1] == a + b[..k];
      BitsPrefix(a, b[..k]);
      assert Bits(a + b) == Bits(a + b[..k]) + ByteBits(b[k]);
    }
  }

  lemma SplitStream(iv: bv16, bits: seq<bv1>, at: nat, n: nat)
    requires at <= n <= |bits|
    ensures FeedBits(iv, bits) == FeedBits(FeedBits(FeedBits(iv, bits[..at]), bits[at..n]), bits[n..])
  {
    FeedBitsConcat(iv, bits[..at], bits[at..n]);
    FeedBitsConcat(iv, bits[..at] + bits[at..n], bits[n..]);
    assert bits == bits[..at] + bits[at..n] + bits[n..];
  }

  lemma ByteBitsInjective(a: bv8, b: bv8)
    requires ByteBits(a) == ByteBits(b)
    ensures a == b
  {
    var u, v := ByteBits(a), ByteBits(b);
    assert u[0] == v[0] && u[1] == v[1] && u[2] == v[2] && u[3] == v[3];
    assert u[4] == v[4] && u[5] == v[5] && u[6] == v[6] && u[7] == v[7];
  }

  lemma ByteBitsLength(b: bv8)
    ensures |ByteBits(b)| == 8
  {
  }

  lemma {:induction false} BitsInjective(s: seq<bv8>, t: seq<bv8>)
    requires |s| == |t| && Bits(s) == Bits(t)
    ensures s == t
  {
    hide ByteBits;
    if s != [] {
      var k := |s| - 1;
      ByteBitsLength(s[k]);
      ByteBitsLength(t[k]);
      assert Bits(s[..k]) == Bits(s)[..8 * k] == Bits(t)[..8 * k] == Bits(t[..k]);
      assert ByteBits(s[k]) == Bits(s)[8 * k..] == Bits(t)[8 * k..] == ByteBits(t[k]);
      BitsInjective(s[..k], t[..k]);
      ByteBitsInjective(s[k], t[k]);
      assert s == s[..k] + [s[k]] && t == t[..k] + [t[k]];
    }
  }
}
